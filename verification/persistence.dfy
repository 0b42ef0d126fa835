/** The batch writes of the database handler: the duplicate check, `InsertVehicles` and
    `InsertParts` on an abstract store, and the two phases run one after the other.
    Each relation is a `Table` keyed by its unique column (`vehicle_id`, `part_id`). What the
    database does inside a transaction is a `Driver` parameter. */
module Persistence {
  import opened Results
  import opened Price
  import opened Models
  import opened Table

  /** A row of `Vehicles`: the columns the vehicle insert writes. */
  datatype VehicleRow = VehicleRow(
    vehicleType: string,
    brand: string,
    model: string,
    url: string,
    vehicleId: string,
    year: int)

  /** A row of `Parts`: the columns the part insert writes. */
  datatype PartRow = PartRow(
    name: string,
    description: string,
    partId: string,
    vehicleId: string,
    price: Decimal,
    imgUrl: string,
    imgThumbUrl: string)

  datatype Store = Store(vehicles: map<string, VehicleRow>, parts: map<string, PartRow>)

  /** What the database does with one transaction: whether `Begin`, `Prepare` or `Commit`
      fail, which statement executions fail (by position), and whether a commit issued after a
      failed statement keeps the rows written before it (PostgreSQL does not). */
  datatype Driver = Driver(
    beginFails: bool,
    prepareFails: bool,
    failingExec: set<nat>,
    commitFails: bool,
    keepsRowsAfterFailedExec: bool)

  /** A driver under which every step of a transaction succeeds. */
  predicate FaultFree(d: Driver) {
    !d.beginFails && !d.prepareFails && d.failingExec == {} && !d.commitFails
  }

  datatype InsertError = DuplicateId | BeginFailed | PrepareFailed | ExecFailed(position: nat) | CommitFailed

  /** One transaction's effect on one relation and the error the insert function returns. */
  datatype Transaction<R> = Transaction(table: map<string, R>, err: Option<InsertError>)

  /** The state after an insert function and the error it returns. */
  datatype Outcome = Outcome(store: Store, err: Option<InsertError>)

  // ---------------------------------------------------------------------------------------
  // The duplicate check

  /** Two vehicles at different positions of the batch share an identifier. */
  predicate DuplicateIds(vs: seq<Vehicle>) {
    exists i, j :: 0 <= i < j < |vs| && vs[i].identifier == vs[j].identifier
  }

  /** The loop of `hasDuplicateVehicleIDs` from the vehicle `vs[0]` on, with the identifiers
      of the earlier vehicles in `seen`. */
  function DuplicateScan(vs: seq<Vehicle>, seen: set<string>): (dup: bool)
    ensures dup <==> SeenOrDuplicate(vs, seen)
    decreases |vs|
  {
    if vs == [] then false
    else if vs[0].identifier in seen then
      assert vs[0].identifier in seen;
      true
    else
      var dup := DuplicateScan(vs[1..], seen + {vs[0].identifier});
      ScanStep(vs, seen);
      dup
  }

  /** Some vehicle of `vs` has an identifier in `seen`, or two of them share one. */
  predicate SeenOrDuplicate(vs: seq<Vehicle>, seen: set<string>) {
    (exists i :: 0 <= i < |vs| && vs[i].identifier in seen) || DuplicateIds(vs)
  }

  /** Marking the first identifier as seen and scanning the rest decides the same question. */
  lemma ScanStep(vs: seq<Vehicle>, seen: set<string>)
    requires vs != [] && vs[0].identifier !in seen
    ensures SeenOrDuplicate(vs, seen) <==> SeenOrDuplicate(vs[1..], seen + {vs[0].identifier})
  {
    var rest := vs[1..];
    var seen' := seen + {vs[0].identifier};
    if SeenOrDuplicate(rest, seen') {
      if exists i :: 0 <= i < |rest| && rest[i].identifier in seen' {
        var i :| 0 <= i < |rest| && rest[i].identifier in seen';
        assert vs[i + 1] == rest[i];
      } else {
        var i, j :| 0 <= i < j < |rest| && rest[i].identifier == rest[j].identifier;
        assert vs[i + 1] == rest[i] && vs[j + 1] == rest[j];
      }
    }
    if SeenOrDuplicate(vs, seen) {
      if exists i :: 0 <= i < |vs| && vs[i].identifier in seen {
        var i :| 0 <= i < |vs| && vs[i].identifier in seen;
        assert rest[i - 1] == vs[i];
      } else {
        var i, j :| 0 <= i < j < |vs| && vs[i].identifier == vs[j].identifier;
        assert rest[j - 1] == vs[j];
        if i > 0 { assert rest[i - 1] == vs[i]; }
      }
    }
  }

  /** `hasDuplicateVehicleIDs`: true exactly when two vehicles at different positions share
      an identifier. */
  function HasDuplicateVehicleIds(vs: seq<Vehicle>): (dup: bool)
    ensures dup <==> exists i, j :: 0 <= i < j < |vs| && vs[i].identifier == vs[j].identifier
  {
    DuplicateScan(vs, {})
  }

  // ---------------------------------------------------------------------------------------
  // The statements each insert executes

  function VehicleRowOf(v: Vehicle): VehicleRow {
    VehicleRow(v.vehicleType, v.brand, v.model, v.url, v.identifier, v.year)
  }

  /** The vehicle insert's executions: one per vehicle, in batch order, keyed by identifier. */
  function VehicleEntries(vs: seq<Vehicle>): (es: seq<Entry<VehicleRow>>)
    ensures |es| == |vs|
    ensures forall i :: 0 <= i < |vs| ==> es[i].0 == vs[i].identifier && es[i].1.vehicleId == vs[i].identifier
    ensures forall i :: 0 <= i < |vs| ==> es[i].1 == VehicleRowOf(vs[i])
  {
    seq(|vs|, i requires 0 <= i < |vs| => (vs[i].identifier, VehicleRowOf(vs[i])))
  }

  /** The statement the part insert executes for `p` of the vehicle with identifier
      `vehicleId`: keyed by the part's own identifier, referencing the vehicle. */
  function PartEntry(p: Part, vehicleId: string): Entry<PartRow> {
    (p.partIdentifier, PartRow(p.name, p.description, p.partIdentifier, vehicleId, p.price, p.imgUrl, p.imgThumbUrl))
  }

  /** The part insert's executions for one vehicle: its parts in order. */
  function PartEntriesOf(v: Vehicle): (es: seq<Entry<PartRow>>)
    ensures |es| == |v.parts|
    ensures forall p :: 0 <= p < |v.parts| ==> es[p] == PartEntry(v.parts[p], v.identifier)
  {
    seq(|v.parts|, p requires 0 <= p < |v.parts| => PartEntry(v.parts[p], v.identifier))
  }

  /** The part insert's executions for the batch: the nested loops, vehicle by vehicle. */
  function PartEntries(vs: seq<Vehicle>): (es: seq<Entry<PartRow>>)
    ensures |es| == TotalParts(vs)
  {
    if vs == [] then [] else PartEntries(vs[..|vs| - 1]) + PartEntriesOf(vs[|vs| - 1])
  }

  /** `e` is the statement of some part of some vehicle of the batch. */
  predicate OwnedEntry(vs: seq<Vehicle>, e: Entry<PartRow>) {
    exists i, p :: 0 <= i < |vs| && 0 <= p < |vs[i].parts| && e == PartEntry(vs[i].parts[p], vs[i].identifier)
  }

  /** The part insert executes one statement per part of the batch, each one the statement of
      a part of the batch under its owner's identifier; conversely every part of the batch has
      its statement. */
  lemma {:induction false} PartEntriesContents(vs: seq<Vehicle>)
    ensures |PartEntries(vs)| == TotalParts(vs)
    ensures forall j :: 0 <= j < |PartEntries(vs)| ==> OwnedEntry(vs, PartEntries(vs)[j])
    ensures forall i, p :: 0 <= i < |vs| && 0 <= p < |vs[i].parts| ==>
      PartEntry(vs[i].parts[p], vs[i].identifier) in PartEntries(vs)
    decreases |vs|
  {
    if vs != [] {
      var init := vs[..|vs| - 1];
      var v := vs[|vs| - 1];
      PartEntriesContents(init);
      var a := PartEntries(init);
      var b := PartEntriesOf(v);
      var es := PartEntries(vs);
      assert es == a + b;
      forall j | 0 <= j < |es|
        ensures OwnedEntry(vs, es[j])
      {
        if j < |a| {
          assert OwnedEntry(init, a[j]);
          var i, p :| 0 <= i < |init| && 0 <= p < |init[i].parts| && a[j] == PartEntry(init[i].parts[p], init[i].identifier);
          assert init[i] == vs[i];
        } else {
          var p := j - |a|;
          assert es[j] == b[p];
          assert es[j] == PartEntry(vs[|vs| - 1].parts[p], vs[|vs| - 1].identifier);
        }
      }
      forall i, p | 0 <= i < |vs| && 0 <= p < |vs[i].parts|
        ensures PartEntry(vs[i].parts[p], vs[i].identifier) in es
      {
        if i < |init| {
          assert init[i] == vs[i];
          assert PartEntry(init[i].parts[p], init[i].identifier) in a;
        } else {
          assert es[|a| + p] == b[p];
        }
      }
    }
  }

  /** The progress bar's total (`totalPartCount`): the loop sums the part counts, which is
      the number of part statements the insert executes. */
  method ProgressTotal(vs: seq<Vehicle>) returns (total: int)
    ensures total == TotalParts(vs) == |PartEntries(vs)|
  {
    total := 0;
    var n := 0;
    while n < |vs|
      invariant 0 <= n <= |vs|
      invariant total == TotalParts(vs[..n])
    {
      assert vs[..n + 1][..n] == vs[..n];
      total := total + |vs[n].parts|;
      n := n + 1;
    }
    assert vs[..n] == vs;
    PartEntriesContents(vs);
  }

  // ---------------------------------------------------------------------------------------
  // One transaction

  /** One insert's transaction as the handler is written. A failing `Begin` returns before
      anything happens. A failing `Prepare` sets the `err` the deferred handler reads, so it
      rolls back. A failing `Exec` assigns an `err` declared inside the loop, which shadows
      that one: the handler sees no error and commits, and what the commit keeps is up to
      the database. A failing `Commit` on the success path is only logged: the function's
      result is not a named one, so the assignment does not reach the caller. */
  function TransactAsWritten<R>(t: map<string, R>, es: seq<Entry<R>>, d: Driver): (r: Transaction<R>)
    ensures r.err.Some? ==> r.err.value.BeginFailed? || r.err.value.PrepareFailed? || r.err.value.ExecFailed?
    ensures d.beginFails ==> r == Transaction(t, Some(BeginFailed))
    ensures !d.beginFails && d.prepareFails ==> r == Transaction(t, Some(PrepareFailed))
    ensures r.err.None? ==> !d.beginFails && !d.prepareFails && forall i :: 0 <= i < |es| ==> i !in d.failingExec
    ensures r.err.None? && !d.commitFails ==> r.table == InsertAll(t, es)
    ensures r.err.None? && d.commitFails ==> r.table == t
    ensures r.err.Some? && r.err.value.ExecFailed? ==>
      var k := r.err.value.position;
      && FirstFailure(d.failingExec, 0, |es|, Some(k))
      && (r.table == t || r.table == InsertAll(t, es[..k]))
  {
    if d.beginFails then Transaction(t, Some(BeginFailed))
    else if d.prepareFails then Transaction(t, Some(PrepareFailed))
    else
      var run := Execute(t, es, d.failingExec, 0);
      ExecuteTable(t, es, d.failingExec, 0);
      match run.failedAt
      case Some(k) =>
        Transaction(if d.keepsRowsAfterFailedExec && !d.commitFails then run.table else t, Some(ExecFailed(k)))
      case None =>
        Transaction(if d.commitFails then t else run.table, None)
  }

  /** One insert's transaction as evidently intended: every error reaches the deferred
      handler, which rolls back, and a failing commit is returned. The transaction is all or
      nothing, and it reports success exactly when no step failed. */
  function Transact<R>(t: map<string, R>, es: seq<Entry<R>>, d: Driver): (r: Transaction<R>)
    ensures r.err.None? <==>
      !d.beginFails && !d.prepareFails && !d.commitFails && forall i :: 0 <= i < |es| ==> i !in d.failingExec
    ensures r.err.None? ==> r.table == InsertAll(t, es)
    ensures r.err.Some? ==> r.table == t
    ensures r.err.Some? && r.err.value.ExecFailed? ==> FirstFailure(d.failingExec, 0, |es|, Some(r.err.value.position))
  {
    if d.beginFails then Transaction(t, Some(BeginFailed))
    else if d.prepareFails then Transaction(t, Some(PrepareFailed))
    else
      var run := Execute(t, es, d.failingExec, 0);
      ExecuteTable(t, es, d.failingExec, 0);
      match run.failedAt
      case Some(k) => Transaction(t, Some(ExecFailed(k)))
      case None => if d.commitFails then Transaction(t, Some(CommitFailed)) else Transaction(run.table, None)
  }

  /** Finding: a failing commit is reported as success, though nothing was stored. */
  lemma CommitErrorSwallowed(t: map<string, int>, es: seq<Entry<int>>, d: Driver)
    requires t == map[] && es == [("a", 1)]
    requires d == Driver(false, false, {}, true, false)
    ensures TransactAsWritten(t, es, d) == Transaction(t, None)
    ensures InsertAll(t, es) != t
    ensures Transact(t, es, d) == Transaction(t, Some(CommitFailed))
  {
    assert "a" in InsertAll(t, es) by { assert es[0].0 == "a"; }
  }

  /** Finding: after a failing statement the handler commits; with a database that keeps the
      earlier rows the batch is half written while the insert reports an error. */
  lemma PartialCommitAfterFailedExec(t: map<string, int>, es: seq<Entry<int>>, d: Driver)
    requires t == map[] && es == [("a", 1), ("b", 2)]
    requires d == Driver(false, false, {1}, false, true)
    ensures TransactAsWritten(t, es, d) == Transaction(map["a" := 1], Some(ExecFailed(1)))
    ensures Transact(t, es, d) == Transaction(t, Some(ExecFailed(1)))
  {
    ExecuteTable(t, es, d.failingExec, 0);
    assert es[..1] == [("a", 1)];
    assert InsertAll(t, [("a", 1)]) == map["a" := 1] by {
      assert [("a", 1)][1..] == [];
    }
  }

  /** On a database that discards a transaction after a failed statement (PostgreSQL), a
      batch with a failing statement is stored by neither version, whatever the commit the
      handler then issues reports: as written and as intended agree. */
  lemma AsWrittenAgreesAfterFailedExec<R>(t: map<string, R>, es: seq<Entry<R>>, d: Driver)
    requires !d.keepsRowsAfterFailedExec
    requires exists i :: 0 <= i < |es| && i in d.failingExec
    ensures TransactAsWritten(t, es, d) == Transact(t, es, d)
  {
    var run := Execute(t, es, d.failingExec, 0);
    assert run.failedAt.Some?;
  }

  /** On a database that discards a transaction after a failed statement (PostgreSQL), and
      with a commit that succeeds, the handler as written has the intended effect. */
  lemma {:induction false} AsWrittenAgreesOnPostgres<R>(t: map<string, R>, es: seq<Entry<R>>, d: Driver)
    requires !d.keepsRowsAfterFailedExec && !d.commitFails
    ensures TransactAsWritten(t, es, d) == Transact(t, es, d)
  {
    var w := TransactAsWritten(t, es, d);
    var c := Transact(t, es, d);
    if !d.beginFails && !d.prepareFails {
      var run := Execute(t, es, d.failingExec, 0);
      ExecuteTable(t, es, d.failingExec, 0);
      if run.failedAt.Some? {
        assert w.table == t && c.table == t;
      }
    }
  }

  // ---------------------------------------------------------------------------------------
  // The two insert functions

  /** `InsertVehicles` as written: the duplicate check, then one transaction of vehicle rows. */
  function InsertVehiclesAsWritten(s: Store, vs: seq<Vehicle>, d: Driver): (o: Outcome)
    ensures DuplicateIds(vs) ==> o == Outcome(s, Some(DuplicateId))
    ensures o.store.parts == s.parts
    ensures o.err.None? && !d.commitFails ==> o.store.vehicles == InsertAll(s.vehicles, VehicleEntries(vs))
  {
    if HasDuplicateVehicleIds(vs) then Outcome(s, Some(DuplicateId))
    else
      var tx := TransactAsWritten(s.vehicles, VehicleEntries(vs), d);
      Outcome(s.(vehicles := tx.table), tx.err)
  }

  /** `InsertVehicles` as intended (corrected; the code as written is `InsertVehiclesAsWritten`):
      a batch with a repeated identifier is refused before any transaction starts; otherwise the
      vehicles are inserted all or nothing. Parts are never touched. */
  function InsertVehicles(s: Store, vs: seq<Vehicle>, d: Driver): (o: Outcome)
    ensures DuplicateIds(vs) ==> o == Outcome(s, Some(DuplicateId))
    ensures o.store.parts == s.parts
    ensures o.err.None? <==>
      && !DuplicateIds(vs) && !d.beginFails && !d.prepareFails && !d.commitFails
      && forall i :: 0 <= i < |vs| ==> i !in d.failingExec
    ensures o.err.None? ==> o.store.vehicles == InsertAll(s.vehicles, VehicleEntries(vs))
    ensures o.err.Some? ==> o.store == s
  {
    if HasDuplicateVehicleIds(vs) then Outcome(s, Some(DuplicateId))
    else
      var tx := Transact(s.vehicles, VehicleEntries(vs), d);
      Outcome(s.(vehicles := tx.table), tx.err)
  }

  /** `InsertParts` as written: one transaction of part rows, with no duplicate check. */
  function InsertPartsAsWritten(s: Store, vs: seq<Vehicle>, d: Driver): (o: Outcome)
    ensures o.store.vehicles == s.vehicles
    ensures o.err.None? && !d.commitFails ==> o.store.parts == InsertAll(s.parts, PartEntries(vs))
  {
    var tx := TransactAsWritten(s.parts, PartEntries(vs), d);
    Outcome(s.(parts := tx.table), tx.err)
  }

  /** `InsertParts` as intended (corrected; the code as written is `InsertPartsAsWritten`): the
      parts of the batch inserted all or nothing, each row referencing the vehicle that owns it.
      Vehicles are never touched. */
  function InsertParts(s: Store, vs: seq<Vehicle>, d: Driver): (o: Outcome)
    ensures o.store.vehicles == s.vehicles
    ensures o.err.None? ==> o.store.parts == InsertAll(s.parts, PartEntries(vs))
    ensures o.err.Some? ==> o.store == s
  {
    var tx := Transact(s.parts, PartEntries(vs), d);
    Outcome(s.(parts := tx.table), tx.err)
  }

  // ---------------------------------------------------------------------------------------
  // Properties of the inserts

  /** Running the same batch again, with every step succeeding, changes nothing: conflicting
      rows are skipped. */
  lemma InsertVehiclesIdempotent(s: Store, vs: seq<Vehicle>, d: Driver)
    requires FaultFree(d)
    ensures var o := InsertVehicles(s, vs, d);
      InsertVehicles(o.store, vs, d) == Outcome(o.store, o.err)
  {
    var o := InsertVehicles(s, vs, d);
    if !DuplicateIds(vs) {
      InsertAllIdempotent(s.vehicles, VehicleEntries(vs));
    }
  }

  lemma InsertPartsIdempotent(s: Store, vs: seq<Vehicle>, d: Driver)
    requires FaultFree(d)
    ensures var o := InsertParts(s, vs, d);
      InsertParts(o.store, vs, d) == Outcome(o.store, None)
  {
    InsertAllIdempotent(s.parts, PartEntries(vs));
  }

  /** A batch whose vehicles are all stored already leaves the store as it is. */
  lemma InsertVehiclesPresent(s: Store, vs: seq<Vehicle>, d: Driver)
    requires forall i :: 0 <= i < |vs| ==> vs[i].identifier in s.vehicles
    ensures InsertVehicles(s, vs, d).store == s
  {
    var es := VehicleEntries(vs);
    assert Keys(es) <= s.vehicles.Keys by {
      forall k | k in Keys(es) ensures k in s.vehicles {
        var i :| 0 <= i < |es| && es[i].0 == k;
      }
    }
    InsertAllPresent(s.vehicles, es);
  }

  /** The same holds of `InsertVehicles` as written, whatever fails: each way out of the
      transaction leaves the table as it was or adds entries whose keys are all taken. */
  lemma InsertVehiclesAsWrittenPresent(s: Store, vs: seq<Vehicle>, d: Driver)
    requires forall i :: 0 <= i < |vs| ==> vs[i].identifier in s.vehicles
    ensures InsertVehiclesAsWritten(s, vs, d).store == s
  {
    var es := VehicleEntries(vs);
    assert Keys(es) <= s.vehicles.Keys by {
      forall k | k in Keys(es) ensures k in s.vehicles {
        var i :| 0 <= i < |es| && es[i].0 == k;
      }
    }
    InsertAllPresent(s.vehicles, es);
    var tx := TransactAsWritten(s.vehicles, es, d);
    if tx.err.Some? && tx.err.value.ExecFailed? {
      InsertAllPresentPrefix(s.vehicles, es, tx.err.value.position);
    }
  }

  /** With every step succeeding, the transaction as written and as intended agree: both
      insert every entry and report success. */
  lemma TransactFaultFree<R>(t: map<string, R>, es: seq<Entry<R>>, d: Driver)
    requires FaultFree(d)
    ensures TransactAsWritten(t, es, d) == Transact(t, es, d) == Transaction(InsertAll(t, es), None)
  {
    ExecuteFaultFree(t, es, d.failingExec, 0);
  }

  /** With every step succeeding, both insert functions as written behave as intended. */
  lemma InsertsAgreeWhenFaultFree(s: Store, vs: seq<Vehicle>, d: Driver)
    requires FaultFree(d)
    ensures InsertVehiclesAsWritten(s, vs, d) == InsertVehicles(s, vs, d)
    ensures InsertPartsAsWritten(s, vs, d) == InsertParts(s, vs, d)
  {
    TransactFaultFree(s.vehicles, VehicleEntries(vs), d);
    TransactFaultFree(s.parts, PartEntries(vs), d);
  }

  /** So re-running a batch on the handler as written, with every step succeeding, changes
      nothing either. */
  lemma InsertsAsWrittenIdempotent(s: Store, vs: seq<Vehicle>, d: Driver)
    requires FaultFree(d)
    ensures var o := InsertVehiclesAsWritten(s, vs, d);
      InsertVehiclesAsWritten(o.store, vs, d) == Outcome(o.store, o.err)
    ensures var o := InsertPartsAsWritten(s, vs, d);
      InsertPartsAsWritten(o.store, vs, d) == Outcome(o.store, None)
  {
    InsertsAgreeWhenFaultFree(s, vs, d);
    InsertVehiclesIdempotent(s, vs, d);
    InsertsAgreeWhenFaultFree(InsertVehicles(s, vs, d).store, vs, d);
    InsertPartsIdempotent(s, vs, d);
    InsertsAgreeWhenFaultFree(InsertParts(s, vs, d).store, vs, d);
  }

  /** Every row of `r` that `t` lacks is the row of one of the entries. */
  ghost predicate NewRowsFrom<R>(t: map<string, R>, r: map<string, R>, es: seq<Entry<R>>) {
    forall k :: k in r && k !in t ==> exists i :: 0 <= i < |es| && es[i] == (k, r[k])
  }

  lemma NewRowsOfPrefix<R>(t: map<string, R>, es: seq<Entry<R>>, n: nat)
    requires n <= |es|
    ensures NewRowsFrom(t, InsertAll(t, es[..n]), es)
  {
    var r := InsertAll(t, es[..n]);
    InsertAllNewRows(t, es[..n]);
    forall k | k in r && k !in t ensures exists i :: 0 <= i < |es| && es[i] == (k, r[k]) {
      var i :| 0 <= i < |es[..n]| && es[..n][i] == (k, r[k]);
      assert es[i] == es[..n][i];
    }
  }

  /** What a transaction as written leaves behind is the table before it or that table with
      rows of the entries added. */
  lemma TransactAsWrittenRows<R>(t: map<string, R>, es: seq<Entry<R>>, d: Driver)
    ensures NewRowsFrom(t, TransactAsWritten(t, es, d).table, es)
  {
    NewRowsOfPrefix(t, es, |es|);
    assert es[..|es|] == es;
    var r := TransactAsWritten(t, es, d);
    if r.err.Some? && r.err.value.ExecFailed? {
      NewRowsOfPrefix(t, es, r.err.value.position);
    }
  }

  /** Every part row `InsertParts` adds, as written and whatever fails, references a vehicle
      of the batch, namely the one owning the part, and is that part's row. */
  lemma InsertPartsAsWrittenReferences(s: Store, vs: seq<Vehicle>, d: Driver)
    ensures var o := InsertPartsAsWritten(s, vs, d);
      forall k :: k in o.store.parts && k !in s.parts ==> OwnedEntry(vs, (k, o.store.parts[k]))
  {
    var es := PartEntries(vs);
    var o := InsertPartsAsWritten(s, vs, d);
    TransactAsWrittenRows(s.parts, es, d);
    PartEntriesContents(vs);
    forall k | k in o.store.parts && k !in s.parts
      ensures OwnedEntry(vs, (k, o.store.parts[k]))
    {
      var j :| 0 <= j < |es| && es[j] == (k, o.store.parts[k]);
      assert OwnedEntry(vs, es[j]);
    }
  }

  /** The same for `InsertParts` as intended (corrected, all or nothing). */
  lemma InsertPartsReferences(s: Store, vs: seq<Vehicle>, d: Driver)
    ensures var o := InsertParts(s, vs, d);
      forall k :: k in o.store.parts && k !in s.parts ==> OwnedEntry(vs, (k, o.store.parts[k]))
  {
    var es := PartEntries(vs);
    var o := InsertParts(s, vs, d);
    InsertAllNewRows(s.parts, es);
    PartEntriesContents(vs);
    forall k | k in o.store.parts && k !in s.parts
      ensures OwnedEntry(vs, (k, o.store.parts[k]))
    {
      var j :| 0 <= j < |es| && es[j] == (k, o.store.parts[k]);
      assert OwnedEntry(vs, es[j]);
    }
  }

  // ---------------------------------------------------------------------------------------
  // The two phases

  /** Every stored part references a stored vehicle. */
  predicate PartsReferenceVehicles(s: Store) {
    forall k :: k in s.parts ==> s.parts[k].vehicleId in s.vehicles
  }

  /** The crawler's transfer: the vehicles, and the parts only once the vehicle insert reported
      no error. A reported vehicle error ends the transfer with the parts untouched; changed
      parts mean the vehicle insert reported success, and the parts phase left its vehicles. */
  function TransferAsWritten(s: Store, vs: seq<Vehicle>, dv: Driver, dp: Driver): (o: Outcome)
    ensures DuplicateIds(vs) ==> o == Outcome(s, Some(DuplicateId))
    ensures InsertVehiclesAsWritten(s, vs, dv).err.Some? ==>
      o.err == InsertVehiclesAsWritten(s, vs, dv).err && o.store.parts == s.parts
    ensures o.store.parts != s.parts ==>
      && InsertVehiclesAsWritten(s, vs, dv).err.None?
      && o.store.vehicles == InsertVehiclesAsWritten(s, vs, dv).store.vehicles
  {
    var ov := InsertVehiclesAsWritten(s, vs, dv);
    if ov.err.Some? then ov else InsertPartsAsWritten(ov.store, vs, dp)
  }

  /** The transfer as intended (corrected; the code as written is `TransferAsWritten`): the
      parts are written only after the vehicles succeeded, so a
      failed vehicle phase leaves the store as it was, and a failed part phase leaves exactly
      the batch's vehicles added. */
  function Transfer(s: Store, vs: seq<Vehicle>, dv: Driver, dp: Driver): (o: Outcome)
    ensures DuplicateIds(vs) ==> o == Outcome(s, Some(DuplicateId))
    ensures InsertVehicles(s, vs, dv).err.Some? ==> o == Outcome(s, InsertVehicles(s, vs, dv).err)
    ensures o.err.Some? ==> o.store == s || o.store == Store(InsertAll(s.vehicles, VehicleEntries(vs)), s.parts)
    ensures o.err.None? ==>
      o.store == Store(InsertAll(s.vehicles, VehicleEntries(vs)), InsertAll(s.parts, PartEntries(vs)))
  {
    var ov := InsertVehicles(s, vs, dv);
    if ov.err.Some? then ov else InsertParts(ov.store, vs, dp)
  }

  /** A second transfer of the same batch, with every step succeeding, changes nothing. */
  lemma TransferIdempotent(s: Store, vs: seq<Vehicle>, dv: Driver, dp: Driver)
    requires FaultFree(dv) && FaultFree(dp) && !DuplicateIds(vs)
    ensures var o := Transfer(s, vs, dv, dp);
      o.err.None? && Transfer(o.store, vs, dv, dp) == o
  {
    var o := Transfer(s, vs, dv, dp);
    TransferFaultFree(s, vs, dv, dp);
    TransferFaultFree(o.store, vs, dv, dp);
    InsertAllIdempotent(s.vehicles, VehicleEntries(vs));
    InsertAllIdempotent(s.parts, PartEntries(vs));
  }

  /** With every step succeeding, the transfer stores the batch in both relations. */
  lemma TransferFaultFree(s: Store, vs: seq<Vehicle>, dv: Driver, dp: Driver)
    requires FaultFree(dv) && FaultFree(dp) && !DuplicateIds(vs)
    ensures Transfer(s, vs, dv, dp)
      == Outcome(Store(InsertAll(s.vehicles, VehicleEntries(vs)), InsertAll(s.parts, PartEntries(vs))), None)
  {
    var ov := InsertVehicles(s, vs, dv);
    assert ov.err.None?;
    var tx := Transact(ov.store.parts, PartEntries(vs), dp);
    assert tx.err.None?;
  }

  /** With every step succeeding, the transfer as written behaves as intended, so it too is
      idempotent on a batch without repeated identifiers. */
  lemma TransferAgreesWhenFaultFree(s: Store, vs: seq<Vehicle>, dv: Driver, dp: Driver)
    requires FaultFree(dv) && FaultFree(dp)
    ensures TransferAsWritten(s, vs, dv, dp) == Transfer(s, vs, dv, dp)
    ensures !DuplicateIds(vs) ==> var o := TransferAsWritten(s, vs, dv, dp);
      o.err.None? && TransferAsWritten(o.store, vs, dv, dp) == o
  {
    InsertsAgreeWhenFaultFree(s, vs, dv);
    InsertsAgreeWhenFaultFree(InsertVehicles(s, vs, dv).store, vs, dp);
    var o := Transfer(s, vs, dv, dp);
    InsertsAgreeWhenFaultFree(o.store, vs, dv);
    InsertsAgreeWhenFaultFree(InsertVehicles(o.store, vs, dv).store, vs, dp);
    if !DuplicateIds(vs) {
      TransferIdempotent(s, vs, dv, dp);
    }
  }

  /** In the transfer as intended (corrected; the code as written is `TransferAsWritten`, which
      breaks this, see `DanglingPartAfterSwallowedCommit`), parts are written only after their
      vehicles are stored, so a store whose parts all reference stored vehicles keeps that
      property, whatever fails. */
  lemma TransferKeepsReferences(s: Store, vs: seq<Vehicle>, dv: Driver, dp: Driver)
    requires PartsReferenceVehicles(s)
    ensures PartsReferenceVehicles(Transfer(s, vs, dv, dp).store)
  {
    var ov := InsertVehicles(s, vs, dv);
    if ov.err.None? {
      var o := InsertParts(ov.store, vs, dp);
      InsertPartsReferences(ov.store, vs, dp);
      var es := VehicleEntries(vs);
      forall k | k in o.store.parts ensures o.store.parts[k].vehicleId in o.store.vehicles {
        if k !in ov.store.parts {
          assert OwnedEntry(vs, (k, o.store.parts[k]));
          var i, p :| 0 <= i < |vs| && 0 <= p < |vs[i].parts|
            && (k, o.store.parts[k]) == PartEntry(vs[i].parts[p], vs[i].identifier);
          assert es[i].0 == vs[i].identifier;
          assert vs[i].identifier in Keys(es);
        }
      }
    }
  }

  /** Finding, seen from the transfer: when the vehicle commit fails, the swallowed error lets
      the part phase run. On a store that does not enforce the key from `Parts.vehicle_id` to
      `Vehicles`, it ends up with a part whose vehicle is not stored. */
  lemma DanglingPartAfterSwallowedCommit(s: Store, vs: seq<Vehicle>, dv: Driver, dp: Driver)
    requires s == Store(map[], map[])
    requires vs == [Vehicle("X 2020", "", "", "bike", 2020, "u", "7", [Part("", "", "p", ZeroPrice, "", "")])]
    requires dv == Driver(false, false, {}, true, false) && dp == Driver(false, false, {}, false, false)
    ensures PartsReferenceVehicles(s)
    ensures var o := TransferAsWritten(s, vs, dv, dp); o.err.None? && !PartsReferenceVehicles(o.store)
    ensures Transfer(s, vs, dv, dp) == Outcome(s, Some(CommitFailed))
  {
    assert !DuplicateIds(vs);
    var ov := InsertVehiclesAsWritten(s, vs, dv);
    assert ov == Outcome(s, None);
    var o := InsertPartsAsWritten(s, vs, dp);
    PartEntriesContents(vs);
    assert PartEntry(vs[0].parts[0], vs[0].identifier) in PartEntries(vs);
    assert "p" in o.store.parts;
    InsertPartsAsWrittenReferences(s, vs, dp);
    assert OwnedEntry(vs, ("p", o.store.parts["p"]));
    assert o.store.parts["p"].vehicleId == "7";
  }

  /** The same failed vehicle commit on a store that enforces the key from `Parts.vehicle_id`
      to `Vehicles`: the part's statement violates the key and fails. The part phase then
      returns that error, which the crawler turns into `log.Fatalf`; on PostgreSQL the commit
      the handler issues after it discards the transaction, so nothing is stored. */
  lemma SwallowedCommitWithForeignKey(s: Store, vs: seq<Vehicle>, dv: Driver, dp: Driver)
    requires s == Store(map[], map[])
    requires vs == [Vehicle("X 2020", "", "", "bike", 2020, "u", "7", [Part("", "", "p", ZeroPrice, "", "")])]
    requires dv == Driver(false, false, {}, true, false) && dp == Driver(false, false, {0}, false, false)
    ensures TransferAsWritten(s, vs, dv, dp) == Outcome(s, Some(ExecFailed(0)))
  {
    assert !DuplicateIds(vs);
    assert InsertVehiclesAsWritten(s, vs, dv) == Outcome(s, None);
    PartEntriesContents(vs);
  }
}
